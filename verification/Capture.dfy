/**
 Recovery and publication of captures (src/capture.rs:124-243), proved against `Recovered` and
 `Published`. The contracts speak about every state the disk passes through, so they cover a
 process that stops at any point.
 */
module Capture {
  import opened Common
  import opened Journal
  import opened DiskModel

  datatype Error = Io | Corrupt | InvalidRequest
  datatype Outcome = Ok | Err(error: Error)

  // ---- Recovery ----

  lemma ShrunkKeepsTx(codec: Codec, a: Fs, b: Fs, id: string, other: string)
    requires !Committed(a, id) && Shrunk(a, b, id)
    ensures Committed(b, other) == Committed(a, other)
    ensures codec.Listed(b, other) == codec.Listed(a, other) || (other == id && codec.Listed(b, id) == [])
    ensures codec.Readable(a, other) ==> codec.Readable(b, other)
  {
    assert InTx(Marker(other), id) ==> other == id;
    assert InTx(IntentFile(other), id) ==> other == id;
  }

  lemma ShrunkKeepsDoomed(codec: Codec, a: Fs, b: Fs, id: string, q: Path)
    requires id in a.txs && !Committed(a, id) && Shrunk(a, b, id) && q in b.files
    requires forall p | p in codec.Listed(a, id) :: p !in a.files
    ensures codec.Doomed(b, q) == codec.Doomed(a, q)
  {
    if codec.Doomed(a, q) {
      var other :| other in a.txs && codec.Owns(a, other, q);
      ShrunkKeepsTx(codec, a, b, id, other);
      assert other in b.txs && codec.Owns(b, other, q);
    }
    if codec.Doomed(b, q) {
      var other :| other in b.txs && codec.Owns(b, other, q);
      ShrunkKeepsTx(codec, a, b, id, other);
      assert codec.Owns(a, other, q);
    }
  }

  lemma ShrunkTagged(codec: Codec, a: Fs, b: Fs, id: string)
    requires codec.WellTagged(a) && id in a.txs && !Committed(a, id) && Shrunk(a, b, id)
    requires forall p | p in codec.Listed(a, id) :: p !in a.files
    ensures codec.WellTagged(b)
  {
    hide Codec.Listed, Marker, EndsWith;
    forall q | q in b.files && Document(q) ensures codec.Tagged(b, q) {
      assert codec.Tagged(a, q);
      ShrunkKeepsTx(codec, a, b, id, codec.tag(a.files[q]));
      forall other | other in b.txs && q in codec.Listed(b, other)
        ensures Committed(b, other) || codec.tag(a.files[q]) == other
      {
        ShrunkKeepsTx(codec, a, b, id, other);
      }
    }
  }

  lemma ShrunkSane(codec: Codec, a: Fs, b: Fs, id: string)
    requires codec.Sane(a) && id in a.txs && !Committed(a, id) && Shrunk(a, b, id)
    requires forall p | p in codec.Listed(a, id) :: p !in a.files
    ensures codec.Sane(b) && (codec.Inv(a) ==> codec.Inv(b))
  {
    if codec.WellTagged(a) {
      ShrunkTagged(codec, a, b, id);
    }
    hide Codec.WellTagged, EndsWith;
    forall other | other in b.txs
      ensures Committed(b, other) || codec.ListsOutside(b, other)
      ensures codec.Readable(a, other) ==> codec.Readable(b, other)
      ensures Committed(b, other) == Committed(a, other)
    {
      ShrunkKeepsTx(codec, a, b, id, other);
    }
  }

  /** However much of an unfinished transaction directory is gone, the same store is recovered. */
  lemma ShrunkView(codec: Codec, a: Fs, b: Fs, id: string)
    requires id in a.txs && !Committed(a, id) && Shrunk(a, b, id)
    requires forall p | p in codec.Listed(a, id) :: p !in a.files
    ensures codec.Recovered(b) == codec.Recovered(a)
  {
    forall other ensures Committed(b, other) == Committed(a, other) {
      ShrunkKeepsTx(codec, a, b, id, other);
    }
    forall q | q in b.files ensures codec.Doomed(b, q) == codec.Doomed(a, q) {
      ShrunkKeepsDoomed(codec, a, b, id, q);
    }
    forall q | q in a.files && q !in b.files ensures codec.Doomed(a, q) {
      assert codec.Owns(a, id, q);
    }
    assert codec.Recovered(b).files == codec.Recovered(a).files;
    assert codec.Recovered(b).txs == codec.Recovered(a).txs;
  }

  /** `s` is a state on the way from `start` to what recovering `start` gives. */
  ghost predicate OnTheWay(codec: Codec, start: Fs, s: Fs) {
    codec.Sane(s) && codec.Recovered(s) == codec.Recovered(start) && (codec.Inv(start) ==> codec.Inv(s))
  }

  ghost predicate AllOnTheWay(codec: Codec, start: Fs, trace: seq<Fs>, n: nat) {
    forall i | n <= i < |trace| :: OnTheWay(codec, start, trace[i])
  }

  /** The files of transaction `id` are the same in both states. */
  ghost predicate SameTx(a: Fs, b: Fs, id: string) {
    forall p | InTx(p, id) :: (p in a.files <==> p in b.files) && (p in a.files ==> a.files[p] == b.files[p])
  }

  ghost predicate SameJournal(a: Fs, b: Fs) {
    forall p | Journalled(p) :: (p in a.files <==> p in b.files) && (p in a.files ==> a.files[p] == b.files[p])
  }

  lemma RemoveListed(codec: Codec, start: Fs, s: Fs, id: string, p: Path)
    requires OnTheWay(codec, start, s) && id in s.txs && !Committed(s, id) && p in codec.Listed(s, id)
    ensures var s' := Without(s, p);
      && OnTheWay(codec, start, s') && SameJournal(s, s')
      && codec.Listed(s', id) == codec.Listed(s, id) && !Committed(s', id)
  {
    assert codec.ListsOutside(s, id);
    assert Journalled(IntentFile(id)) && Journalled(Marker(id));
    if p in s.files {
      codec.RemoveOwned(s, id, p);
    } else {
      assert s.files - {p} == s.files;
    }
  }

  /** Removes the files a published intent lists. */
  method RemoveAllListed(codec: Codec, disk: Disk, id: string, paths: seq<Path>) returns (r: Outcome)
    requires disk.Valid() && codec.Sane(disk.fs) && id in disk.fs.txs && !Committed(disk.fs, id)
    requires paths == codec.Listed(disk.fs, id)
    modifies disk
    ensures disk.Valid() && old(disk.trace) <= disk.trace && disk.fs.txs == old(disk.fs.txs)
    ensures OnTheWay(codec, old(disk.fs), disk.fs) && SameJournal(old(disk.fs), disk.fs)
    ensures AllOnTheWay(codec, old(disk.fs), disk.trace, |old(disk.trace)|)
    ensures r == Err(Corrupt) ==> exists p :: p in paths && !ValidRelative(p)
    ensures old(disk.faults) <= disk.faults && old(disk.refused) <= disk.refused
    ensures r == Err(Io) ==> disk.refused > old(disk.refused) && disk.faults > old(disk.faults)
    ensures r != Err(InvalidRequest)
    ensures r != Err(Io) ==> disk.faults == old(disk.faults) && disk.refused == old(disk.refused)
    ensures r == Ok ==> forall p | p in paths :: ValidRelative(p) && p !in disk.fs.files
  {
    hide Codec.Sane, Codec.Recovered, Codec.IntentsReadable;
    ghost var start := disk.fs;
    for i := 0 to |paths|
      invariant disk.Valid() && old(disk.trace) <= disk.trace && disk.fs.txs == start.txs
      invariant OnTheWay(codec, start, disk.fs) && SameJournal(start, disk.fs)
      invariant AllOnTheWay(codec, start, disk.trace, |old(disk.trace)|)
      invariant codec.Listed(disk.fs, id) == paths && !Committed(disk.fs, id)
      invariant forall j | 0 <= j < i :: ValidRelative(paths[j]) && paths[j] !in disk.fs.files
      invariant disk.faults == old(disk.faults) && disk.refused == old(disk.refused)
    {
      if !ValidRelative(paths[i]) { return Err(Corrupt); }
      RemoveListed(codec, start, disk.fs, id, paths[i]);
      var ok := disk.RemoveIfPresent(paths[i]);
      if !ok { return Err(Io); }
    }
    r := Ok;
  }

  /** Undoes one unfinished transaction. */
  method RecoverOne(codec: Codec, disk: Disk, id: string) returns (r: Outcome)
    requires disk.Valid() && codec.Sane(disk.fs) && id in disk.fs.txs && !Committed(disk.fs, id)
    modifies disk
    ensures disk.Valid() && old(disk.trace) <= disk.trace
    ensures OnTheWay(codec, old(disk.fs), disk.fs)
    ensures AllOnTheWay(codec, old(disk.fs), disk.trace, |old(disk.trace)|)
    ensures r == Err(Corrupt) ==> !codec.Readable(old(disk.fs), id)
    ensures r == Ok ==> codec.Readable(old(disk.fs), id) && disk.fs.txs == old(disk.fs).txs - {id}
    ensures forall other | other != id :: SameTx(old(disk.fs), disk.fs, other)
    ensures old(disk.faults) <= disk.faults && old(disk.refused) <= disk.refused
    ensures r == Err(Io) ==> disk.refused > old(disk.refused) && disk.faults > old(disk.faults)
    ensures r != Err(InvalidRequest)
    ensures r != Err(Io) ==> disk.faults == old(disk.faults) && disk.refused == old(disk.refused)
  {
    hide Codec.Sane, Codec.Recovered, Codec.IntentsReadable;
    ghost var start := disk.fs;
    if IntentFile(id) in disk.fs.files {
      var read := disk.Scan();
      if !read { return Err(Io); }
      var decoded := codec.decode(disk.fs.files[IntentFile(id)]);
      if decoded == None { return Err(Corrupt); }
      r := RemoveAllListed(codec, disk, id, decoded.value);
      if r != Ok { return; }
    }
    ghost var emptied := disk.fs;
    assert SameJournal(start, emptied);
    assert Journalled(IntentFile(id)) && Journalled(Marker(id));
    var ok := disk.RemoveTxDir(id);
    forall b | Shrunk(emptied, b, id) ensures OnTheWay(codec, start, b) {
      ShrunkSane(codec, emptied, b, id);
      ShrunkView(codec, emptied, b, id);
    }
    r := if ok then Ok else Err(Io);
  }

  lemma SameTxFacts(codec: Codec, a: Fs, b: Fs, id: string)
    requires SameTx(a, b, id)
    ensures Committed(a, id) == Committed(b, id) && codec.Readable(a, id) == codec.Readable(b, id)
  {
    assert InTx(Marker(id), id) && InTx(IntentFile(id), id);
  }

  lemma SameTxReflexive(a: Fs, id: string)
    ensures SameTx(a, a, id)
  {
  }

  lemma SameTxTransitive(a: Fs, b: Fs, c: Fs, id: string)
    requires SameTx(a, b, id) && SameTx(b, c, id)
    ensures SameTx(a, c, id)
  {
  }

  /** recover: undoes every unfinished transaction, in whatever order the journal lists them. */
  method Recover(codec: Codec, disk: Disk) returns (r: Outcome)
    requires disk.Valid() && codec.Sane(disk.fs)
    modifies disk
    ensures disk.Valid() && old(disk.trace) < disk.trace
    ensures OnTheWay(codec, old(disk.fs), disk.fs)
    ensures AllOnTheWay(codec, old(disk.fs), disk.trace, |old(disk.trace)|)
    ensures r == Ok ==> disk.fs == codec.Recovered(old(disk.fs))
    ensures !codec.IntentsReadable(old(disk.fs)) ==> r != Ok
    ensures r == Err(Corrupt) ==> !codec.IntentsReadable(old(disk.fs))
    ensures old(disk.faults) <= disk.faults && old(disk.refused) <= disk.refused
    ensures r == Err(Io) ==> disk.faults > old(disk.faults)
    ensures r != Err(InvalidRequest)
    ensures r == Err(Io) && disk.refused == old(disk.refused) ==> disk.fs == codec.Recovered(old(disk.fs))
  {
    hide Codec.Recovered, Codec.Sane, Codec.Listed, SameTx;
    ghost var start := disk.fs;
    var ok := disk.Scan();
    if !ok { return Err(Io); }
    var ids := disk.fs.txs;
    forall id ensures SameTx(start, start, id) { SameTxReflexive(start, id); }
    while ids != {}
      invariant disk.Valid() && old(disk.trace) < disk.trace && ids <= disk.fs.txs <= start.txs
      invariant OnTheWay(codec, start, disk.fs) && AllOnTheWay(codec, start, disk.trace, |old(disk.trace)|)
      invariant forall id | id in ids :: SameTx(start, disk.fs, id)
      invariant forall id | id in start.txs - ids :: Committed(start, id) || codec.Readable(start, id)
      invariant forall id | id in disk.fs.txs - ids :: SameTx(start, disk.fs, id) && Committed(start, id)
      invariant disk.faults == old(disk.faults) && disk.refused == old(disk.refused)
      decreases ids
    {
      var id :| id in ids;
      ids := ids - {id};
      SameTxFacts(codec, start, disk.fs, id);
      if Committed(disk.fs, id) { continue; }
      ghost var before := disk.fs;
      r := RecoverOne(codec, disk, id);
      if r != Ok { return; }
      forall other | other != id && SameTx(start, before, other) ensures SameTx(start, disk.fs, other) {
        SameTxTransitive(start, before, disk.fs, other);
      }
    }
    forall id | id in disk.fs.txs ensures Committed(disk.fs, id) {
      SameTxFacts(codec, start, disk.fs, id);
    }
    codec.CleanIsFixpoint(disk.fs);
    ok := disk.Sync();
    r := if ok then Ok else Err(Io);
  }

  // ---- Publication ----

  /** What a batch must satisfy before its transaction directory is created. */
  ghost predicate Ready(codec: Codec, pre: Fs, id: string, files: seq<File>) {
    && codec.Clean(pre) && codec.Whole(pre) && codec.WellTagged(pre)
    && FreshId(pre, id, files) && Admissible(pre, files)
    && codec.AcceptsAll(files, id) && forall f | f in files :: !Journalled(f.path)
  }

  lemma ReadyUntouched(codec: Codec, pre: Fs, id: string, files: seq<File>)
    requires Ready(codec, pre, id, files)
    ensures codec.Untouched(pre, id, IntentPaths(files, id), files)
  {
    var paths := IntentPaths(files, id);
    forall p | p in paths
      ensures Destination(p) && p !in pre.files
      ensures Document(p) ==> exists f :: f in files && f.path == p
    {
      IntentPathsMember(files, id, p);
      var f :| f in files && (p == f.path || p == PendingPath(f.path, id));
      PendingIsSeparate(f.path, id);
    }
    ListedFiles(files, id, |files|);
    assert files[..|files|] == files;
  }

  lemma StagedIntentInFlight(codec: Codec, pre: Fs, id: string, paths: seq<Path>, files: seq<File>, data: Bytes)
    requires codec.Untouched(pre, id, paths, files)
    ensures var base := Fs(pre.files, pre.txs + {id});
      && codec.InFlight(base, pre, id, paths, files)
      && codec.InFlight(With(base, StagedIntent(id), data), pre, id, paths, files)
      && codec.InFlight(With(base, IntentFile(id), codec.encode(paths)), pre, id, paths, files)
  {
    TxNames(id);
    hide StagedIntent, IntentFile, Marker, Codec.InFlight;
    TxDirInFlight(codec, pre, id, paths, files);
    TxFileInFlight(codec, pre, id, paths, files, StagedIntent(id), data);
    TxFileInFlight(codec, pre, id, paths, files, IntentFile(id), codec.encode(paths));
  }

  lemma TxDirInFlight(codec: Codec, pre: Fs, id: string, paths: seq<Path>, files: seq<File>)
    requires codec.Untouched(pre, id, paths, files)
    ensures codec.InFlight(Fs(pre.files, pre.txs + {id}), pre, id, paths, files)
  {
    TxNames(id);
    hide IntentFile, Marker, EndsWith, Codec.Whole, Codec.WellTagged, Codec.AcceptsAll, Document;
    assert forall p | p in pre.files :: !InTx(p, id);
  }

  /** A file of the transaction's own that is neither its marker nor a damaged intent. */
  lemma TxFileInFlight(codec: Codec, pre: Fs, id: string, paths: seq<Path>, files: seq<File>, p: Path, data: Bytes)
    requires codec.Untouched(pre, id, paths, files) && InTx(p, id) && p != Marker(id)
    requires p == IntentFile(id) ==> data == codec.encode(paths)
    ensures codec.InFlight(With(Fs(pre.files, pre.txs + {id}), p, data), pre, id, paths, files)
  {
    TxNames(id);
    hide IntentFile, Marker, EndsWith, Codec.Whole, Codec.WellTagged, Codec.AcceptsAll, Document;
    assert forall q | q in pre.files :: !InTx(q, id);
    assert forall q | q in paths :: !Journalled(q);
  }

  /** Writing a listed path once the intent is in place. */
  lemma WithInFlight(codec: Codec, s: Fs, pre: Fs, id: string, paths: seq<Path>, files: seq<File>, p: Path, data: Bytes)
    requires codec.Untouched(pre, id, paths, files) && codec.InFlight(s, pre, id, paths, files)
    requires p in paths && IntentFile(id) in s.files
    requires forall f | f in files && f.path == p :: f.data == data
    ensures codec.InFlight(With(s, p, data), pre, id, paths, files)
  {
    TxNames(id);
    hide IntentFile, Marker;
    assert Destination(p);
  }

  /** Renaming or removing a listed path. */
  lemma WithoutInFlight(codec: Codec, s: Fs, pre: Fs, id: string, paths: seq<Path>, files: seq<File>, p: Path)
    requires codec.Untouched(pre, id, paths, files) && codec.InFlight(s, pre, id, paths, files) && p in paths
    ensures codec.InFlight(Without(s, p), pre, id, paths, files)
  {
    TxNames(id);
    hide IntentFile, Marker;
    assert Destination(p);
  }

  lemma {:induction false} PreparedInFlight(codec: Codec, pre: Fs, id: string, paths: seq<Path>, files: seq<File>,
                                            n: nat)
    requires codec.Untouched(pre, id, paths, files) && n <= |files|
    requires forall i, j | 0 <= i < j < |files| :: files[i].path != files[j].path
    ensures codec.InFlight(codec.Prepared(pre, id, paths, files[..n]), pre, id, paths, files)
    ensures IntentFile(id) in codec.Prepared(pre, id, paths, files[..n]).files
  {
    hide Codec.InFlight;
    if n == 0 {
      StagedIntentInFlight(codec, pre, id, paths, files, []);
    } else {
      PreparedInFlight(codec, pre, id, paths, files, n - 1);
      assert files[..n][..n - 1] == files[..n - 1];
      var at := codec.Prepared(pre, id, paths, files[..n - 1]);
      assert files[n - 1] in files;
      WithInFlight(codec, at, pre, id, paths, files, files[n - 1].path, files[n - 1].data);
    }
  }

  /** Staging names are listed, and do not exist before their turn. */
  lemma PendingIsNew(codec: Codec, pre: Fs, id: string, files: seq<File>, n: nat)
    requires Ready(codec, pre, id, files) && n < |files|
    ensures var pending := PendingPath(files[n].path, id);
      && pending in IntentPaths(files, id) && files[n].path in IntentPaths(files, id)
      && pending !in codec.Prepared(pre, id, IntentPaths(files, id), files[..n]).files
      && forall f | f in files :: f.path != pending
  {
    var pending := PendingPath(files[n].path, id);
    IntentPathsMember(files, id, pending);
    IntentPathsMember(files, id, files[n].path);
    PendingIsSeparate(files[n].path, id);
    TxNames(id);
    var base := With(Fs(pre.files, pre.txs + {id}), IntentFile(id), codec.encode(IntentPaths(files, id)));
    PutAllMember(base, files[..n], pending);
    hide IntentFile;
  }

  /** A published batch: the old files, every destination with its bytes, and its own journal entry. */
  lemma PublishedFiles(codec: Codec, pre: Fs, id: string, files: seq<File>, p: Path)
    requires Ready(codec, pre, id, files)
    ensures var post := codec.Published(pre, id, files);
      && post.txs == pre.txs + {id}
      && (p in pre.files ==> p in post.files && post.files[p] == pre.files[p])
      && (p in post.files ==> p in pre.files || p == IntentFile(id) || p == Marker(id)
                              || exists f :: f in files && f.path == p)
      && (forall f | f in files && f.path == p :: p in post.files && post.files[p] == f.data)
      && Marker(id) in post.files
  {
    TxNames(id);
    hide IntentFile, Marker, IntentPaths, PutAll;
    var base := With(Fs(pre.files, pre.txs + {id}), IntentFile(id), codec.encode(IntentPaths(files, id)));
    PutAllMember(base, files, p);
    assert p in pre.files ==> !InTx(p, id);
    forall f | f in files && f.path == p
      ensures p in codec.Published(pre, id, files).files && codec.Published(pre, id, files).files[p] == f.data
    {
      var k :| 0 <= k < |files| && files[k] == f;
      PutAllBytes(base, files, k);
    }
  }

  lemma PublishedClean(codec: Codec, pre: Fs, id: string, files: seq<File>)
    requires Ready(codec, pre, id, files)
    ensures codec.Clean(codec.Published(pre, id, files))
  {
    var post := codec.Published(pre, id, files);
    TxNames(id);
    hide IntentFile, Marker, IntentPaths, PutAll, Codec.Published, Codec.Whole, Codec.WellTagged, EndsWith;
    forall p ensures p in post.files ==> p in pre.files || InTx(p, id) || !Journalled(p) {
      PublishedFiles(codec, pre, id, files, p);
    }
    forall other | other in post.txs ensures Committed(post, other) {
      PublishedFiles(codec, pre, id, files, Marker(other));
    }
    PublishedFiles(codec, pre, id, files, []);
  }

  lemma PublishedDocuments(codec: Codec, pre: Fs, id: string, files: seq<File>)
    requires Ready(codec, pre, id, files)
    ensures var post := codec.Published(pre, id, files);
      codec.Whole(post) && codec.WellTagged(post)
  {
    var post := codec.Published(pre, id, files);
    PublishedClean(codec, pre, id, files);
    TxNames(id);
    hide IntentFile, Marker, IntentPaths, PutAll, Codec.Published, EndsWith, Codec.Sane;
    forall p | p in post.files && Document(p) ensures codec.accepts(p, post.files[p]) && codec.Tagged(post, p) {
      PublishedFiles(codec, pre, id, files, p);
      if p in pre.files {
        codec.CleanVisible(pre, p);
        PublishedFiles(codec, pre, id, files, Marker(codec.tag(pre.files[p])));
      }
    }
  }

  lemma PublishedIsClean(codec: Codec, pre: Fs, id: string, files: seq<File>)
    requires Ready(codec, pre, id, files)
    ensures var post := codec.Published(pre, id, files);
      codec.Clean(post) && codec.Inv(post) && codec.Recovered(post) == post
  {
    var post := codec.Published(pre, id, files);
    PublishedClean(codec, pre, id, files);
    PublishedDocuments(codec, pre, id, files);
    hide Codec.Published, Codec.Recovered, Codec.IntentsReadable, Codec.Whole, Codec.WellTagged, Ready;
    codec.CleanIsFixpoint(post);
  }

  ghost predicate AllInFlight(codec: Codec, pre: Fs, id: string, paths: seq<Path>, files: seq<File>, trace: seq<Fs>,
                              n: nat)
  {
    forall i | n <= i < |trace| :: codec.InFlight(trace[i], pre, id, paths, files)
  }

  lemma StageIsNew(codec: Codec, pre: Fs, id: string, paths: seq<Path>, files: seq<File>)
    requires codec.Untouched(pre, id, paths, files)
    ensures StagedIntent(id) !in pre.files
  {
    TxNames(id);
  }

  /** Stages the intent in two writes and renames it into place. */
  method PublishIntent(codec: Codec, disk: Disk, id: string, paths: seq<Path>, ghost files: seq<File>, ghost pre: Fs)
    returns (ok: bool)
    requires disk.Valid() && codec.Untouched(pre, id, paths, files) && disk.fs == Fs(pre.files, pre.txs + {id})
    modifies disk
    ensures disk.Valid() && old(disk.trace) <= disk.trace
    ensures codec.InFlight(disk.fs, pre, id, paths, files)
    ensures AllInFlight(codec, pre, id, paths, files, disk.trace, |old(disk.trace)|)
    ensures old(disk.faults) <= disk.faults && disk.refused == old(disk.refused)
    ensures ok <==> disk.faults == old(disk.faults)
    ensures ok ==> disk.fs == codec.Prepared(pre, id, paths, [])
  {
    hide Codec.InFlight, Codec.Untouched, StagedIntent, IntentFile;
    ghost var start := disk.fs;
    var stage := StagedIntent(id);
    TxNames(id);
    StageIsNew(codec, pre, id, paths, files);
    forall data ensures codec.InFlight(With(start, stage, data), pre, id, paths, files) {
      StagedIntentInFlight(codec, pre, id, paths, files, data);
    }
    StagedIntentInFlight(codec, pre, id, paths, files, []);
    ok := disk.Sync();
    if !ok { return; }
    var intent := codec.encode(paths);
    ok := StageIntent(codec, disk, stage, start, intent, pre, id, paths, files);
    if !ok { return; }
    assert Without(disk.fs, stage).files == start.files;
    ok := disk.Rename(stage, IntentFile(id));
    if !ok { return; }
    ok := disk.Sync();
  }

  method StageIntent(codec: Codec, disk: Disk, stage: Path, ghost base: Fs, intent: Bytes,
                     ghost pre: Fs, ghost id: string, ghost paths: seq<Path>, ghost files: seq<File>) returns (ok: bool)
    requires disk.Valid() && disk.fs == base && stage !in base.files
    requires codec.InFlight(base, pre, id, paths, files)
    requires forall d :: codec.InFlight(With(base, stage, d), pre, id, paths, files)
    modifies disk
    ensures disk.Valid() && old(disk.trace) <= disk.trace
    ensures codec.InFlight(disk.fs, pre, id, paths, files)
    ensures AllInFlight(codec, pre, id, paths, files, disk.trace, |old(disk.trace)|)
    ensures old(disk.faults) <= disk.faults && disk.refused == old(disk.refused)
    ensures ok <==> disk.faults == old(disk.faults)
    ensures ok ==> disk.fs == With(base, stage, intent)
  {
    hide Codec.InFlight;
    ok := disk.CreateNew(stage);
    if !ok { return; }
    var half := (|intent| + 1) / 2;
    assert [] + intent[..half] == intent[..half];
    ok := WriteStage(codec, disk, stage, base, [], intent[..half], pre, id, paths, files);
    if !ok { return; }
    ok := disk.Sync();
    if !ok { return; }
    assert intent[..half] + intent[half..] == intent;
    ok := WriteStage(codec, disk, stage, base, intent[..half], intent[half..], pre, id, paths, files);
    if !ok { return; }
    ok := disk.Sync();
  }

  /** One write to the staged intent, which already holds `done`. */
  method WriteStage(codec: Codec, disk: Disk, stage: Path, ghost base: Fs, ghost done: Bytes, data: Bytes,
                    ghost pre: Fs, ghost id: string, ghost paths: seq<Path>, ghost files: seq<File>) returns (ok: bool)
    requires disk.Valid() && disk.fs == With(base, stage, done)
    requires forall d :: codec.InFlight(With(base, stage, d), pre, id, paths, files)
    modifies disk
    ensures disk.Valid() && old(disk.trace) <= disk.trace
    ensures codec.InFlight(disk.fs, pre, id, paths, files)
    ensures AllInFlight(codec, pre, id, paths, files, disk.trace, |old(disk.trace)|)
    ensures old(disk.faults) <= disk.faults && disk.refused == old(disk.refused)
    ensures ok <==> disk.faults == old(disk.faults)
    ensures ok ==> disk.fs == With(base, stage, done + data)
  {
    hide Codec.InFlight;
    assert forall d :: With(disk.fs, stage, d) == With(base, stage, d);
    ok := disk.WriteAll(stage, data);
  }

  /** Stages one destination beside its final name and renames it into place. */
  method PublishFile(codec: Codec, disk: Disk, id: string, files: seq<File>, n: nat, ghost pre: Fs) returns (ok: bool)
    requires disk.Valid() && Ready(codec, pre, id, files) && n < |files|
    requires disk.fs == codec.Prepared(pre, id, IntentPaths(files, id), files[..n])
    modifies disk
    ensures disk.Valid() && old(disk.trace) <= disk.trace
    ensures codec.InFlight(disk.fs, pre, id, IntentPaths(files, id), files)
    ensures AllInFlight(codec, pre, id, IntentPaths(files, id), files, disk.trace, |old(disk.trace)|)
    ensures old(disk.faults) <= disk.faults && disk.refused == old(disk.refused)
    ensures ok <==> disk.faults == old(disk.faults)
    ensures ok ==> disk.fs == codec.Prepared(pre, id, IntentPaths(files, id), files[..n + 1])
  {
    hide Codec.InFlight, Codec.Untouched, Ready, PendingPath, IntentPaths, IntentFile;
    ghost var at := disk.fs;
    ghost var paths := IntentPaths(files, id);
    var pending := PendingPath(files[n].path, id);
    ReadyUntouched(codec, pre, id, files);
    ReadyDistinct(codec, pre, id, files);
    PreparedInFlight(codec, pre, id, paths, files, n);
    PendingIsNew(codec, pre, id, files, n);
    forall data ensures codec.InFlight(With(at, pending, data), pre, id, paths, files) {
      WithInFlight(codec, at, pre, id, paths, files, pending, data);
    }
    ok := disk.WriteNewSynced(pending, files[n].data);
    if !ok { return; }
    ok := disk.Sync();
    if !ok { return; }
    assert files[..n + 1][..n] == files[..n];
    assert Without(disk.fs, pending).files == at.files;
    WithInFlight(codec, at, pre, id, paths, files, files[n].path, files[n].data);
    ok := disk.Rename(pending, files[n].path);
    if !ok { return; }
    ok := disk.Sync();
  }

  lemma ReadyDistinct(codec: Codec, pre: Fs, id: string, files: seq<File>)
    requires Ready(codec, pre, id, files)
    ensures forall i, j | 0 <= i < j < |files| :: files[i].path != files[j].path
  {
  }

  lemma ListedFiles(files: seq<File>, id: string, n: nat)
    requires n <= |files|
    ensures forall f | f in files[..n] :: f.path in IntentPaths(files, id)
  {
    forall f | f in files[..n] ensures f.path in IntentPaths(files, id) {
      IntentPathsMember(files, id, f.path);
    }
  }

  /** The publication closure up to the commit marker. */
  method PublishAll(codec: Codec, disk: Disk, id: string, files: seq<File>, ghost pre: Fs) returns (ok: bool)
    requires disk.Valid() && Ready(codec, pre, id, files) && disk.fs == Fs(pre.files, pre.txs + {id})
    modifies disk
    ensures disk.Valid() && old(disk.trace) <= disk.trace
    ensures codec.InFlight(disk.fs, pre, id, IntentPaths(files, id), files)
    ensures AllInFlight(codec, pre, id, IntentPaths(files, id), files, disk.trace, |old(disk.trace)|)
    ensures old(disk.faults) <= disk.faults && disk.refused == old(disk.refused)
    ensures ok <==> disk.faults == old(disk.faults)
    ensures ok ==> disk.fs == codec.Prepared(pre, id, IntentPaths(files, id), files)
  {
    hide Codec.InFlight, Codec.Untouched, Codec.Prepared, Ready, IntentPaths;
    ReadyUntouched(codec, pre, id, files);
    ok := PublishIntent(codec, disk, id, IntentPaths(files, id), files, pre);
    if !ok { return; }
    for n := 0 to |files|
      invariant disk.Valid() && old(disk.trace) <= disk.trace
      invariant codec.InFlight(disk.fs, pre, id, IntentPaths(files, id), files)
      invariant AllInFlight(codec, pre, id, IntentPaths(files, id), files, disk.trace, |old(disk.trace)|)
      invariant disk.fs == codec.Prepared(pre, id, IntentPaths(files, id), files[..n])
      invariant disk.faults == old(disk.faults) && disk.refused == old(disk.refused)
    {
      ok := PublishFile(codec, disk, id, files, n, pre);
      if !ok { return; }
    }
    assert files[..|files|] == files;
    ok := true;
  }

  lemma ShrunkInFlight(codec: Codec, a: Fs, b: Fs, pre: Fs, id: string, paths: seq<Path>, files: seq<File>)
    requires codec.Untouched(pre, id, paths, files) && codec.InFlight(a, pre, id, paths, files) && Shrunk(a, b, id)
    requires forall p | p in paths :: p !in a.files
    ensures codec.InFlight(b, pre, id, paths, files)
    ensures b.txs == a.txs - {id} && (forall p | p in b.files :: !InTx(p, id)) ==> b == pre
  {
    hide IntentFile, Marker, Codec.Whole, Codec.WellTagged, Codec.AcceptsAll, Document;
    TxNames(id);
    assert forall p | p in pre.files :: !InTx(p, id);
    hide Codec.Sane;
    if b.txs == a.txs - {id} && forall p | p in b.files :: !InTx(p, id) {
      assert b.files == pre.files;
    }
  }

  /** Undoes a failed publication; stops at the first removal that fails, keeping the intent. */
  method RollBack(codec: Codec, disk: Disk, id: string, files: seq<File>, ghost pre: Fs) returns (ok: bool)
    requires disk.Valid() && Ready(codec, pre, id, files)
    requires codec.InFlight(disk.fs, pre, id, IntentPaths(files, id), files)
    modifies disk
    ensures disk.Valid() && old(disk.trace) <= disk.trace
    ensures codec.InFlight(disk.fs, pre, id, IntentPaths(files, id), files)
    ensures AllInFlight(codec, pre, id, IntentPaths(files, id), files, disk.trace, |old(disk.trace)|)
    ensures old(disk.faults) <= disk.faults && old(disk.refused) <= disk.refused
    ensures disk.refused == old(disk.refused) ==> disk.fs == pre
    ensures ok ==> disk.fs == pre
  {
    hide Codec.InFlight, Codec.Untouched, Ready, PendingPath, IntentPaths;
    ghost var paths := IntentPaths(files, id);
    ReadyUntouched(codec, pre, id, files);
    for n := 0 to |files|
      invariant disk.Valid() && old(disk.trace) <= disk.trace
      invariant codec.InFlight(disk.fs, pre, id, paths, files)
      invariant AllInFlight(codec, pre, id, paths, files, disk.trace, |old(disk.trace)|)
      invariant forall f | f in files[..n] :: f.path !in disk.fs.files && PendingPath(f.path, id) !in disk.fs.files
      invariant disk.faults == old(disk.faults) && disk.refused == old(disk.refused)
    {
      IntentPathsMember(files, id, files[n].path);
      IntentPathsMember(files, id, PendingPath(files[n].path, id));
      WithoutInFlight(codec, disk.fs, pre, id, paths, files, files[n].path);
      ok := disk.RemoveIfPresent(files[n].path);
      if !ok { return; }
      WithoutInFlight(codec, disk.fs, pre, id, paths, files, PendingPath(files[n].path, id));
      ok := disk.RemoveIfPresent(PendingPath(files[n].path, id));
      if !ok { return; }
      assert files[..n + 1] == files[..n] + [files[n]];
    }
    assert files[..|files|] == files;
    forall p | p in paths ensures p !in disk.fs.files { IntentPathsMember(files, id, p); }
    ghost var a := disk.fs;
    ok := disk.RemoveTxDir(id);
    forall b | Shrunk(a, b, id)
      ensures codec.InFlight(b, pre, id, paths, files)
      ensures b.txs == a.txs - {id} && (forall p | p in b.files :: !InTx(p, id)) ==> b == pre
    {
      ShrunkInFlight(codec, a, b, pre, id, paths, files);
    }
    if !ok { return; }
    ok := disk.Sync();
  }

  /** The checks a batch must pass before anything is written. */
  method CheckDestinations(fs: Fs, files: seq<File>) returns (ok: bool)
    ensures ok <==> Admissible(fs, files)
  {
    var unique := {};
    for n := 0 to |files|
      invariant Admissible(fs, files[..n])
      invariant forall p :: p in unique <==> exists i | 0 <= i < n :: files[i].path == p
    {
      var path := files[n].path;
      if !ValidRelative(path) || path in fs.files || path in unique {
        assert files[n] in files;
        return false;
      }
      unique := unique + {path};
      assert files[..n + 1] == files[..n] + [files[n]];
    }
    assert files[..|files|] == files;
    ok := true;
  }

  /**
   From `n` on, the store recovers to `pre` until state `point`, and is exactly the published
   batch from `point` on. `point` is the first state with the commit marker.
   */
  ghost predicate Phases(codec: Codec, pre: Fs, id: string, files: seq<File>, trace: seq<Fs>, n: nat, point: nat) {
    forall i | n <= i < |trace| ::
      if point <= i then trace[i] == codec.Published(pre, id, files) else Before(codec, pre, id, trace[i])
  }

  ghost predicate Before(codec: Codec, pre: Fs, id: string, s: Fs) {
    codec.Inv(s) && codec.Recovered(s) == pre && !Committed(s, id)
  }

  lemma OnTheWayIsBefore(codec: Codec, start: Fs, s: Fs, id: string)
    requires codec.Inv(start) && OnTheWay(codec, start, s) && id !in start.txs
    ensures Before(codec, codec.Recovered(start), id, s)
  {
    TxNames(id);
    hide Marker;
    assert Committed(s, id) ==> id in codec.Recovered(s).txs;
  }

  lemma InFlightIsBefore(codec: Codec, s: Fs, pre: Fs, id: string, paths: seq<Path>, files: seq<File>)
    requires codec.Lawful() && id != "" && codec.Untouched(pre, id, paths, files)
    requires codec.InFlight(s, pre, id, paths, files)
    ensures Before(codec, pre, id, s)
  {
    codec.InFlightTagged(s, pre, id, paths, files);
    hide Codec.WellTagged, Codec.Sane, Codec.IntentsReadable, Codec.Whole;
    codec.InFlightView(s, pre, id, paths, files);
    codec.InFlightWhole(s, pre, id, paths, files);
  }

  lemma RecoveredWellTagged(codec: Codec, fs: Fs)
    requires codec.Inv(fs)
    ensures codec.Whole(codec.Recovered(fs)) && codec.WellTagged(codec.Recovered(fs))
  {
    var r := codec.Recovered(fs);
    hide EndsWith;
    forall p | p in r.files && Document(p) ensures codec.Tagged(r, p) {
      codec.VisibleIsRecovered(fs, p);
      var tag := codec.tag(fs.files[p]);
      if tag != "" { codec.MarkerSurvives(fs, tag); }
      codec.RecoveredIsClean(fs);
    }
  }

  lemma FreshAfterRecovery(codec: Codec, fs: Fs, id: string, files: seq<File>)
    requires codec.Inv(fs) && FreshId(fs, id, files) && codec.AcceptsAll(files, id)
    requires forall f | f in files :: !Journalled(f.path)
    ensures Admissible(codec.Recovered(fs), files) ==> Ready(codec, codec.Recovered(fs), id, files)
  {
    codec.RecoveredIsClean(fs);
    RecoveredWellTagged(codec, fs);
    hide Codec.Inv, Codec.Clean, Codec.Whole, Codec.WellTagged;
  }

  lemma FailureIsIo(r: Outcome)
    requires r != Ok && r != Err(Corrupt) && r != Err(InvalidRequest)
    ensures r == Err(Io)
  {
    var e := r.error;
    assert e.Io? || e.Corrupt? || e.InvalidRequest?;
  }

  /**
   commit: publishes every file of a batch under one marker.

   `point` locates the marker among the states the disk passes through. Without a refused scan, read
   or removal an unpublished batch leaves the recovered store; without any fault the batch is
   published exactly if it is admissible, and refused as an invalid request otherwise.
   */
  method Commit(codec: Codec, disk: Disk, id: string, files: seq<File>)
    returns (r: Outcome, ghost point: nat)
    requires disk.Valid() && codec.Lawful() && codec.Inv(disk.fs)
    requires FreshId(disk.fs, id, files) && codec.AcceptsAll(files, id)
    requires forall f | f in files :: !Journalled(f.path)
    modifies disk
    ensures disk.Valid() && old(disk.trace) <= disk.trace
    ensures Phases(codec, codec.Recovered(old(disk.fs)), id, files, disk.trace, |old(disk.trace)|, point)
    ensures |old(disk.trace)| < |disk.trace|
    ensures point < |disk.trace| ==>
      |old(disk.trace)| <= point && Ready(codec, codec.Recovered(old(disk.fs)), id, files)
    ensures r == Ok ==> point < |disk.trace|
    ensures !Admissible(codec.Recovered(old(disk.fs)), files) ==> r != Ok && point >= |disk.trace|
    ensures old(disk.faults) <= disk.faults && old(disk.refused) <= disk.refused
    ensures r != Ok && point >= |disk.trace| && disk.refused == old(disk.refused) ==>
      disk.fs == codec.Recovered(old(disk.fs))
    ensures disk.faults == old(disk.faults) ==> (r == Ok <==> Admissible(codec.Recovered(old(disk.fs)), files))
    ensures r == Err(InvalidRequest) ==> !Admissible(codec.Recovered(old(disk.fs)), files)
    ensures r == Err(Io) ==> disk.faults > old(disk.faults)
    ensures r == Ok || r == Err(InvalidRequest) || r == Err(Io)
  {
    hide Codec.InFlight, Codec.Sane, Codec.Clean, Codec.IntentsReadable, Codec.Recovered, Codec.Published;
    assert id !in disk.fs.txs && id != "";
    hide OnTheWay, Ready, IntentPaths, Codec.Untouched, FreshId, Marker;
    ghost var start, n := disk.fs, |disk.trace|;
    ghost var pre := codec.Recovered(start);
    ghost var paths := IntentPaths(files, id);
    r := Recover(codec, disk);
    point := |disk.trace|;
    forall i | n <= i < |disk.trace| ensures Before(codec, pre, id, disk.trace[i]) {
      OnTheWayIsBefore(codec, start, disk.trace[i], id);
    }
    if r != Ok {
      assert codec.IntentsReadable(start);
      FailureIsIo(r);
      return;
    }
    assert Before(codec, pre, id, disk.trace[|disk.trace| - 1]);
    var ok := CheckDestinations(disk.fs, files);
    if !ok { r := Err(InvalidRequest); return; }
    FreshAfterRecovery(codec, start, id, files);
    ReadyUntouched(codec, pre, id, files);
    StagedIntentInFlight(codec, pre, id, paths, files, []);
    ok := disk.MakeTxDir(id);
    point := |disk.trace|;
    InFlightIsBefore(codec, Fs(pre.files, pre.txs + {id}), pre, id, paths, files);
    if !ok { r := Err(Io); return; }
    ghost var m := |disk.trace|;
    ok := PublishAll(codec, disk, id, files, pre);
    point := |disk.trace|;
    AllInFlightIsBefore(codec, pre, id, paths, files, disk.trace, m);
    InFlightIsBefore(codec, disk.fs, pre, id, paths, files);
    if ok {
      ok := PublishMarker(codec, disk, id, files, pre);
      if Marker(id) !in disk.fs.files { point := |disk.trace|; }
    }
    if !ok && Marker(id) !in disk.fs.files {
      point := |disk.trace|;
      m := point;
      ok := RollBack(codec, disk, id, files, pre);
      point := |disk.trace|;
      AllInFlightIsBefore(codec, pre, id, paths, files, disk.trace, m);
      r := Err(Io);
    } else {
      r := if ok then Ok else Err(Io);
    }
  }

  /**
   A process that stops in any state of a commit leaves a store that reopens to what was there
   before, or to that plus every destination with its bytes, and the marker tells which.
   */
  lemma CrashAtomicity(codec: Codec, pre: Fs, id: string, files: seq<File>, trace: seq<Fs>, n: nat, point: nat, i: nat)
    requires Phases(codec, pre, id, files, trace, n, point) && n <= i < |trace|
    requires point < |trace| ==> Ready(codec, pre, id, files)
    ensures codec.Inv(trace[i]) && (Committed(trace[i], id) <==> point <= i)
    ensures !Committed(trace[i], id) ==> codec.Recovered(trace[i]) == pre
    ensures Committed(trace[i], id) ==> trace[i] == codec.Recovered(trace[i]) && trace[i].txs == pre.txs + {id}
    ensures Committed(trace[i], id) ==> forall f | f in files ::
      f.path in trace[i].files && trace[i].files[f.path] == f.data
    ensures Committed(trace[i], id) ==> forall p | p in pre.files ::
      p in trace[i].files && trace[i].files[p] == pre.files[p]
    ensures Committed(trace[i], id) ==> forall p | p in trace[i].files ::
      p in pre.files || p == IntentFile(id) || p == Marker(id) || exists f :: f in files && f.path == p
  {
    hide Codec.Published, Codec.Recovered, Codec.Inv, Ready, Marker, IntentFile;
    if point <= i {
      PublishedIsClean(codec, pre, id, files);
      forall p
        ensures Marker(id) in trace[i].files && trace[i].txs == pre.txs + {id}
        ensures p in pre.files ==> p in trace[i].files && trace[i].files[p] == pre.files[p]
        ensures p in trace[i].files ==>
          p in pre.files || p == IntentFile(id) || p == Marker(id) || exists f :: f in files && f.path == p
        ensures forall f | f in files && f.path == p :: p in trace[i].files && trace[i].files[p] == f.data
      {
        PublishedFiles(codec, pre, id, files, p);
      }
      PublishedFiles(codec, pre, id, files, []);
    } else {
      assert Before(codec, pre, id, trace[i]);
    }
  }

  /** Until the marker exists readers accept no document of the batch, rolled back or not. */
  lemma UnpublishedIsInvisible(codec: Codec, pre: Fs, id: string, files: seq<File>, trace: seq<Fs>, n: nat, point: nat,
                               i: nat, p: Path)
    requires Phases(codec, pre, id, files, trace, n, point) && n <= i < |trace| && i < point
    requires p in trace[i].files && Document(p) && p !in pre.files
    ensures !Visible(trace[i], codec.tag(trace[i].files[p]))
  {
    assert Before(codec, pre, id, trace[i]);
    hide Codec.Recovered, Codec.Inv, Marker, Document;
    codec.VisibleIsRecovered(trace[i], p);
  }

  /**
   Recovery can be interrupted any number of times: every state on the way recovers to the same
   store, and what it recovers to needs no recovery.
   */
  lemma RecoveryRestarts(codec: Codec, start: Fs, middle: Fs, end: Fs)
    requires codec.Inv(start) && OnTheWay(codec, start, middle) && OnTheWay(codec, middle, end)
    ensures OnTheWay(codec, start, end) && codec.IntentsReadable(end)
    ensures codec.Recovered(end) == codec.Recovered(start)
    ensures codec.Recovered(codec.Recovered(end)) == codec.Recovered(start) && codec.Inv(codec.Recovered(start))
  {
    codec.RecoveredIsClean(start);
    RecoveredWellTagged(codec, start);
    hide Codec.Recovered, Codec.Sane, Codec.WellTagged, Codec.Whole;
    codec.CleanIsFixpoint(codec.Recovered(start));
  }

  lemma AllInFlightIsBefore(codec: Codec, pre: Fs, id: string, paths: seq<Path>, files: seq<File>, trace: seq<Fs>,
                            n: nat)
    requires codec.Lawful() && id != "" && codec.Untouched(pre, id, paths, files)
    requires AllInFlight(codec, pre, id, paths, files, trace, n)
    ensures forall i | n <= i < |trace| :: Before(codec, pre, id, trace[i])
  {
    hide Codec.InFlight, Before, Codec.Untouched;
    forall i | n <= i < |trace| ensures Before(codec, pre, id, trace[i]) {
      InFlightIsBefore(codec, trace[i], pre, id, paths, files);
    }
  }

  lemma PartialNothing(a: Fs, b: Fs, p: Path)
    requires p in a.files && Partial(a, b, p, [])
    ensures b == a
  {
    var k :| 0 <= k <= 0 && b == With(a, p, a.files[p] + [][..k]);
    assert a.files[p] + [][..k] == a.files[p];
    assert a.files[p := a.files[p]] == a.files;
  }

  /** Creates the commit marker: the one effect that publishes the batch. */
  method PublishMarker(codec: Codec, disk: Disk, id: string, files: seq<File>, ghost pre: Fs) returns (ok: bool)
    requires disk.Valid() && disk.fs == codec.Prepared(pre, id, IntentPaths(files, id), files)
    requires !Committed(disk.fs, id)
    modifies disk
    ensures disk.Valid() && old(disk.trace) < disk.trace
    ensures Committed(disk.fs, id) || disk.fs == old(disk.fs)
    ensures forall i | |old(disk.trace)| <= i < |disk.trace| :: disk.trace[i] == disk.fs
    ensures Committed(disk.fs, id) ==> disk.fs == codec.Published(pre, id, files)
    ensures old(disk.faults) <= disk.faults && disk.refused == old(disk.refused)
    ensures ok <==> disk.faults == old(disk.faults)
    ensures ok ==> Committed(disk.fs, id)
  {
    hide Codec.Prepared, IntentPaths, Marker;
    ok := disk.CreateNew(Marker(id));
    if !ok { return; }
    ghost var published := disk.fs;
    forall s | Partial(published, s, Marker(id), []) ensures s == published {
      PartialNothing(published, s, Marker(id));
    }
    hide Partial;
    ok := disk.WriteAll(Marker(id), []);
    assert published.files[Marker(id)] + [] == [];
    if !ok { return; }
    ok := disk.Sync();
  }
}
