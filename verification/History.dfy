/**
 Whole runs of a store: every state the disk passes through, over any number of captures,
 failures, process stops, reopenings and administrative edits.
 */
module History {
  import opened Common
  import opened Journal
  import opened Capture

  datatype Batch = Batch(id: string, files: seq<File>)

  /** Paths no administrative operation touches: the journal and the replay records. */
  predicate Kept(p: Path) { Journalled(p) || (p != [] && p[0] == RECORDS) }

  /** `batch` is published between `a` and `b`. */
  ghost predicate Publishes(codec: Codec, a: Fs, b: Fs, batch: Batch) {
    && Ready(codec, codec.Recovered(a), batch.id, batch.files)
    && codec.Recovered(b) == codec.Published(codec.Recovered(a), batch.id, batch.files)
  }

  /** At most the file `p` changes between `a` and `b`. */
  ghost predicate Edits(codec: Codec, a: Fs, b: Fs, p: Path) {
    && p != [] && !Kept(p)
    && codec.Recovered(b).txs == codec.Recovered(a).txs
    && AgreeOff(codec.Recovered(a), codec.Recovered(b), p)
  }

  /** The same files everywhere but at `p` and its temporary file. */
  ghost predicate AgreeOff(a: Fs, b: Fs, p: Path) {
    forall q | q != p && q != TmpPath(p) ::
      (q in a.files <==> q in b.files) && (q in a.files ==> a.files[q] == b.files[q])
  }

  /** One step of a run, as seen after recovery: nothing, one whole batch, or one edited file. */
  ghost predicate Linked(codec: Codec, a: Fs, b: Fs) {
    || codec.Recovered(b) == codec.Recovered(a)
    || (exists batch :: Publishes(codec, a, b, batch))
    || (exists p :: Edits(codec, a, b, p))
  }

  ghost predicate Chain(codec: Codec, states: seq<Fs>) {
    && (forall i | 0 <= i < |states| :: codec.Inv(states[i]))
    && (forall i | 0 < i < |states| :: Linked(codec, states[i - 1], states[i]))
  }

  // ---- Operations extend a run ----

  lemma RecoveryExtendsChain(codec: Codec, trace: seq<Fs>, n: nat)
    requires 0 < n <= |trace| && Chain(codec, trace[..n])
    requires AllOnTheWay(codec, trace[n - 1], trace, n)
    ensures Chain(codec, trace)
  {
    hide Codec.Inv, Codec.Recovered, Codec.Sane;
    assert forall i | 0 <= i < n :: trace[..n][i] == trace[i];
    forall i | n <= i < |trace| ensures codec.Inv(trace[i]) && Linked(codec, trace[i - 1], trace[i]) {
      assert OnTheWay(codec, trace[n - 1], trace[i]);
      assert i - 1 >= n ==> OnTheWay(codec, trace[n - 1], trace[i - 1]);
    }
  }

  lemma CommitExtendsChain(codec: Codec, trace: seq<Fs>, n: nat, batch: Batch, point: nat)
    requires 0 < n <= |trace| && Chain(codec, trace[..n])
    requires var pre := codec.Recovered(trace[n - 1]);
      && Phases(codec, pre, batch.id, batch.files, trace, n, point)
      && (point < |trace| ==> n <= point && Ready(codec, pre, batch.id, batch.files))
    ensures Chain(codec, trace)
    ensures point < |trace| ==> Publishes(codec, trace[point - 1], trace[point], batch)
  {
    hide Codec.Inv, Codec.Recovered, Codec.Published, Ready;
    var pre := codec.Recovered(trace[n - 1]);
    assert forall i | 0 <= i < n :: trace[..n][i] == trace[i];
    if point < |trace| {
      PublishedIsClean(codec, pre, batch.id, batch.files);
    }
    forall i | n <= i < |trace| ensures codec.Inv(trace[i]) && Linked(codec, trace[i - 1], trace[i]) {
      assert i < point ==> Before(codec, pre, batch.id, trace[i]);
      assert i - 1 >= n && i - 1 < point ==> Before(codec, pre, batch.id, trace[i - 1]);
      assert i == point ==> Publishes(codec, trace[i - 1], trace[i], batch);
    }
  }

  /** A new, empty store is a run. */
  lemma EmptyStoreIsRun(codec: Codec)
    ensures Chain(codec, [Fs(map[], {})])
  {
  }

  /** A process may stop in any state: what happened so far is a run. */
  lemma ChainPrefix(codec: Codec, states: seq<Fs>, n: nat)
    requires Chain(codec, states) && n <= |states|
    ensures Chain(codec, states[..n])
  {
    hide Codec.Inv, Linked;
  }

  /** Every batch that is ready can be published next. */
  lemma ReadyExtendsChain(codec: Codec, states: seq<Fs>, batch: Batch)
    requires states != [] && Chain(codec, states) && Ready(codec, codec.Recovered(Last(states)), batch.id, batch.files)
    ensures var post := codec.Published(codec.Recovered(Last(states)), batch.id, batch.files);
      Chain(codec, states + [post]) && Publishes(codec, Last(states), post, batch)
  {
    var pre := codec.Recovered(Last(states));
    var post := codec.Published(pre, batch.id, batch.files);
    hide Codec.Inv, Codec.Recovered, Codec.Published, Ready, Chain, Edits, Codec.Clean;
    PublishedIsClean(codec, pre, batch.id, batch.files);
    assert Publishes(codec, Last(states), post, batch);
    hide Publishes;
    ChainAppend(codec, states, post);
  }

  lemma ChainAppend(codec: Codec, states: seq<Fs>, s: Fs)
    requires states != [] && Chain(codec, states) && codec.Inv(s) && Linked(codec, Last(states), s)
    ensures Chain(codec, states + [s])
  {
    hide Codec.Inv, Linked;
  }

  lemma EditKeepsOwners(codec: Codec, a: Fs, b: Fs, p: Path, id: string)
    requires p != [] && !Journalled(p) && AgreeOff(a, b, p)
    ensures Committed(b, id) == Committed(a, id) && codec.Listed(b, id) == codec.Listed(a, id)
    ensures codec.Readable(b, id) == codec.Readable(a, id)
  {
    TmpIsSeparate(p);
    assert Journalled(Marker(id)) && Journalled(IntentFile(id));
    hide TmpPath;
  }

  lemma EditKeepsDoomed(codec: Codec, a: Fs, b: Fs, p: Path, q: Path)
    requires p != [] && !Journalled(p) && b.txs == a.txs && AgreeOff(a, b, p)
    ensures codec.Doomed(b, q) == codec.Doomed(a, q)
  {
    if codec.Doomed(a, q) {
      var id :| id in a.txs && codec.Owns(a, id, q);
      EditKeepsOwners(codec, a, b, p, id);
      assert codec.Owns(b, id, q);
    }
    if codec.Doomed(b, q) {
      var id :| id in b.txs && codec.Owns(b, id, q);
      EditKeepsOwners(codec, a, b, p, id);
      assert codec.Owns(a, id, q);
    }
  }

  /** If `p` is a document afterwards, it was one before, with the same transaction. */
  ghost predicate Rewrites(codec: Codec, a: Fs, b: Fs, p: Path) {
    p in b.files && Document(p) ==>
      p in a.files && codec.accepts(p, b.files[p]) && codec.tag(b.files[p]) == codec.tag(a.files[p])
  }

  lemma EditKeepsTags(codec: Codec, a: Fs, b: Fs, p: Path)
    requires codec.WellTagged(a) && p != [] && !Journalled(p) && b.txs == a.txs && AgreeOff(a, b, p)
    requires Rewrites(codec, a, b, p)
    ensures codec.WellTagged(b)
  {
    TmpIsSeparate(p);
    hide Marker, Codec.Listed, EndsWith, TmpPath;
    forall id ensures Committed(b, id) == Committed(a, id) && codec.Listed(b, id) == codec.Listed(a, id) {
      EditKeepsOwners(codec, a, b, p, id);
    }
    forall q | q in b.files && Document(q) ensures codec.Tagged(b, q) {
      assert codec.Tagged(a, q);
    }
  }

  lemma EditKeepsSane(codec: Codec, a: Fs, b: Fs, p: Path)
    requires codec.Sane(a) && p != [] && !Journalled(p) && b.txs == a.txs && AgreeOff(a, b, p)
    ensures codec.Sane(b) && (codec.IntentsReadable(a) ==> codec.IntentsReadable(b))
  {
    TmpIsSeparate(p);
    hide TmpPath, Marker, IntentFile, Codec.Listed, Codec.Readable;
    forall id | id in b.txs
      ensures Committed(b, id) || codec.ListsOutside(b, id)
      ensures Committed(b, id) == Committed(a, id) && codec.Readable(b, id) == codec.Readable(a, id)
    {
      EditKeepsOwners(codec, a, b, p, id);
    }
  }

  lemma EditKeepsInv(codec: Codec, a: Fs, b: Fs, p: Path)
    requires codec.Inv(a) && p != [] && !Journalled(p) && b.txs == a.txs && AgreeOff(a, b, p)
    requires Rewrites(codec, a, b, p)
    ensures codec.Inv(b)
  {
    EditKeepsTags(codec, a, b, p);
    EditKeepsSane(codec, a, b, p);
    TmpIsSeparate(p);
    hide TmpPath, Codec.WellTagged, Codec.Sane, Codec.IntentsReadable, EndsWith;
  }

  /** Changing one file outside the journal is one step of a run. */
  lemma EditIsStep(codec: Codec, a: Fs, b: Fs, p: Path)
    requires codec.Inv(a) && p != [] && !Kept(p) && b.txs == a.txs && AgreeOff(a, b, p) && Rewrites(codec, a, b, p)
    ensures codec.Inv(b) && Edits(codec, a, b, p)
  {
    EditKeepsInv(codec, a, b, p);
    hide Codec.Inv, Marker, IntentFile, Codec.Doomed;
    forall q ensures codec.Doomed(b, q) == codec.Doomed(a, q) {
      EditKeepsDoomed(codec, a, b, p, q);
    }
    forall id ensures Committed(b, id) == Committed(a, id) {
      EditKeepsOwners(codec, a, b, p, id);
    }
  }

  // ---- What holds over every run ----

  lemma StepKeeps(codec: Codec, a: Fs, b: Fs, p: Path)
    requires Linked(codec, a, b) && Kept(p) && p in codec.Recovered(a).files
    ensures p in codec.Recovered(b).files && codec.Recovered(b).files[p] == codec.Recovered(a).files[p]
  {
    hide Codec.Recovered, Codec.Published, Ready, TmpPath;
    if batch :| Publishes(codec, a, b, batch) {
      PublishedFiles(codec, codec.Recovered(a), batch.id, batch.files, p);
    } else if q :| Edits(codec, a, b, q) {
      TmpIsSeparate(q);
    }
  }

  /** Journal entries and replay records survive every later step with the same bytes. */
  lemma {:induction false} KeptPersists(codec: Codec, states: seq<Fs>, i: nat, j: nat, p: Path)
    requires Chain(codec, states) && i <= j < |states| && Kept(p) && p in codec.Recovered(states[i]).files
    ensures p in codec.Recovered(states[j]).files
    ensures codec.Recovered(states[j]).files[p] == codec.Recovered(states[i]).files[p]
    decreases j - i
  {
    hide Codec.Recovered, Codec.Inv, Kept, Linked;
    if i < j {
      assert Linked(codec, states[i + 1 - 1], states[i + 1]);
      StepKeeps(codec, states[i], states[i + 1], p);
      KeptPersists(codec, states, i + 1, j, p);
    }
  }

  /** A step that edits neither `p` nor a file whose temporary name is `p`. */
  ghost predicate Spares(codec: Codec, a: Fs, b: Fs, p: Path) {
    || codec.Recovered(b) == codec.Recovered(a)
    || (exists batch :: Publishes(codec, a, b, batch))
    || (exists q :: Edits(codec, a, b, q) && q != p && TmpPath(q) != p)
  }

  /**
   No capture, recovery, failure or process stop removes or changes a published file: only an
   edit of that very file can.
   */
  lemma {:induction false} FileSurvives(codec: Codec, states: seq<Fs>, i: nat, j: nat, p: Path)
    requires i <= j < |states| && p in codec.Recovered(states[i]).files
    requires forall t | i <= t < j :: Spares(codec, states[t], states[t + 1], p)
    ensures p in codec.Recovered(states[j]).files && p in states[j].files
    ensures states[j].files[p] == codec.Recovered(states[i]).files[p]
    decreases j - i
  {
    hide Codec.Published, Ready, TmpPath, Codec.Doomed;
    if i < j {
      var a, b := states[i], states[i + 1];
      assert Spares(codec, a, b, p);
      if batch :| Publishes(codec, a, b, batch) {
        PublishedFiles(codec, codec.Recovered(a), batch.id, batch.files, p);
      }
      assert p in codec.Recovered(b).files && codec.Recovered(b).files[p] == codec.Recovered(a).files[p];
      FileSurvives(codec, states, i + 1, j, p);
    }
  }

  /** At most one batch of a run publishes a given journal or record path. */
  lemma PublishedOnce(codec: Codec, states: seq<Fs>, i: nat, j: nat, first: Batch, second: Batch, p: Path)
    requires Chain(codec, states) && 0 < i <= j < |states|
    requires Publishes(codec, states[i - 1], states[i], first) && Publishes(codec, states[j - 1], states[j], second)
    requires Kept(p) && (exists f :: f in first.files && f.path == p) && (exists f :: f in second.files && f.path == p)
    ensures i == j
  {
    hide Chain, Codec.Recovered, Codec.Published, Kept, Codec.Whole, Codec.AcceptsAll, Codec.Clean, FreshId;
    PublishedFiles(codec, codec.Recovered(states[i - 1]), first.id, first.files, p);
    if i < j {
      assert p !in codec.Recovered(states[j - 1]).files;
      KeptPersists(codec, states, i, j - 1, p);
    }
  }

  lemma CommittedIsKept(codec: Codec, fs: Fs, id: string)
    requires codec.Inv(fs)
    ensures Committed(fs, id) <==> Marker(id) in codec.Recovered(fs).files
    ensures Kept(Marker(id))
  {
    if Committed(fs, id) {
      codec.MarkerSurvives(fs, id);
    }
  }

  lemma MarkerIsNew(codec: Codec, pre: Fs, id: string, files: seq<File>)
    requires Ready(codec, pre, id, files)
    ensures Marker(id) !in pre.files && Marker(id) in codec.Published(pre, id, files).files
  {
    TxNames(id);
  }

  /** A batch is committed exactly in the states from its publication on. */
  lemma MarkerTiming(codec: Codec, states: seq<Fs>, i: nat, batch: Batch, t: nat)
    requires Chain(codec, states) && 0 < i < |states| && t < |states|
    requires Publishes(codec, states[i - 1], states[i], batch)
    ensures Committed(states[t], batch.id) <==> i <= t
  {
    hide Codec.Recovered, Codec.Published, Codec.Inv, Kept, Ready, Linked, Marker;
    MarkerIsNew(codec, codec.Recovered(states[i - 1]), batch.id, batch.files);
    CommittedIsKept(codec, states[t], batch.id);
    if i <= t {
      KeptPersists(codec, states, i, t, Marker(batch.id));
    } else if Committed(states[t], batch.id) {
      KeptPersists(codec, states, t, i - 1, Marker(batch.id));
    }
  }

  lemma CommittedPersists(codec: Codec, states: seq<Fs>, i: nat, j: nat, id: string)
    requires Chain(codec, states) && i <= j < |states| && Committed(states[i], id)
    ensures Committed(states[j], id)
  {
    hide Codec.Recovered, Codec.Inv, Kept, Linked, Marker;
    CommittedIsKept(codec, states[i], id);
    CommittedIsKept(codec, states[j], id);
    KeptPersists(codec, states, i, j, Marker(id));
  }
}
