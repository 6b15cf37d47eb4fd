/**
 Replay records (src/capture.rs:60-105): each provider request is answered once, and from then
 on with the same record, across failures, process stops and reopenings.
 */
module Replay {
  import opened Common
  import opened Journal
  import opened Capture
  import opened History
  import opened MailFiles

  datatype Loaded = Absent | Found(record: Record) | Failed

  /** load_record */
  function LoadRecord(codec: MailCodec, fs: Fs, key: string): Loaded {
    var p := codec.RecordPath(key);
    if p !in fs.files then Absent
    else match codec.decodeRecord(fs.files[p])
      case None => Failed
      case Some(record) =>
        if record.key != key then Failed
        else if Visible(fs, record.tx) then Found(record)
        else Absent
  }

  /** In every state of a run, a lookup succeeds and finds exactly the records recovery would keep. */
  lemma LoadIsRecovered(codec: MailCodec, fs: Fs, key: string)
    requires codec.Lawful() && codec.Journal().Inv(fs)
    ensures LoadRecord(codec, fs, key) != Failed
    ensures LoadRecord(codec, fs, key).Found? <==> codec.RecordPath(key) in codec.Journal().Recovered(fs).files
    ensures LoadRecord(codec, fs, key).Found? ==>
      codec.decodeRecord(codec.Journal().Recovered(fs).files[codec.RecordPath(key)]) ==
        Some(LoadRecord(codec, fs, key).record)
  {
    var p := codec.RecordPath(key);
    codec.RecordPaths(key);
    if p in fs.files {
      codec.Journal().VisibleIsRecovered(fs, p);
      assert codec.Journal().accepts(p, fs.files[p]);
      codec.RecordPathInjective(key, codec.decodeRecord(fs.files[p]).value.key);
    }
  }

  lemma RecordPublished(codec: MailCodec, a: Fs, b: Fs, batch: Batch, record: Record)
    requires codec.Lawful() && Publishes(codec.Journal(), a, b, batch)
    requires File(codec.RecordPath(record.key), codec.encodeRecord(record)) in batch.files
    ensures var p := codec.RecordPath(record.key);
      && p !in codec.Journal().Recovered(a).files
      && p in codec.Journal().Recovered(b).files
      && codec.decodeRecord(codec.Journal().Recovered(b).files[p]) == Some(record)
  {
    RecordIsNew(codec, codec.Journal().Recovered(a), batch, record);
    hide Codec.Recovered, Codec.Published, Ready, MailCodec.RecordPath;
    PublishedFiles(codec.Journal(), codec.Journal().Recovered(a), batch.id, batch.files, codec.RecordPath(record.key));
  }

  /** A published record is what every later lookup returns, and no lookup before returned any. */
  lemma ReplayExactlyOnce(codec: MailCodec, states: seq<Fs>, i: nat, batch: Batch, record: Record, t: nat)
    requires codec.Lawful() && Chain(codec.Journal(), states) && 0 < i < |states| && t < |states|
    requires Publishes(codec.Journal(), states[i - 1], states[i], batch)
    requires File(codec.RecordPath(record.key), codec.encodeRecord(record)) in batch.files
    ensures LoadRecord(codec, states[t], record.key) == if i <= t then Found(record) else Absent
  {
    hide Codec.Recovered, Codec.Inv, Linked, Kept, LoadRecord, Destination, Document, Publishes;
    hide MailCodec.RecordPath, MailCodec.Lawful, MailCodec.Journal;
    var p := codec.RecordPath(record.key);
    codec.RecordPaths(record.key);
    RecordPublished(codec, states[i - 1], states[i], batch, record);
    LoadIsRecovered(codec, states[t], record.key);
    if i <= t {
      KeptPersists(codec.Journal(), states, i, t, p);
    } else if LoadRecord(codec, states[t], record.key).Found? {
      KeptPersists(codec.Journal(), states, t, i - 1, p);
    }
  }

  lemma RecordIsNew(codec: MailCodec, pre: Fs, batch: Batch, record: Record)
    requires Ready(codec.Journal(), pre, batch.id, batch.files)
    requires File(codec.RecordPath(record.key), codec.encodeRecord(record)) in batch.files
    ensures codec.RecordPath(record.key) !in pre.files
  {
  }

  /** No two batches of a run publish a record for the same key. */
  lemma OneBatchPerKey(codec: MailCodec, states: seq<Fs>, i: nat, j: nat, first: Batch, second: Batch, key: string)
    requires codec.Lawful() && Chain(codec.Journal(), states) && 0 < i <= j < |states|
    requires Publishes(codec.Journal(), states[i - 1], states[i], first)
    requires Publishes(codec.Journal(), states[j - 1], states[j], second)
    requires exists f :: f in first.files && f.path == codec.RecordPath(key)
    requires exists f :: f in second.files && f.path == codec.RecordPath(key)
    ensures i == j
  {
    codec.RecordPaths(key);
    PublishedOnce(codec.Journal(), states, i, j, first, second, codec.RecordPath(key));
  }

  /** An attempt to publish a record for a key that is taken publishes nothing. */
  lemma TakenKeyPublishesNothing(codec: MailCodec, trace: seq<Fs>, n: nat, batch: Batch, point: nat, key: string)
    requires codec.Lawful() && Chain(codec.Journal(), trace) && 0 < n <= |trace|
    requires point < |trace| ==> n <= point && Publishes(codec.Journal(), trace[point - 1], trace[point], batch)
    requires LoadRecord(codec, trace[n - 1], key).Found?
    requires exists f :: f in batch.files && f.path == codec.RecordPath(key)
    ensures point >= |trace|
  {
    hide Codec.Recovered, Codec.Inv, Linked, Kept, LoadRecord, Destination, Document, Publishes;
    hide MailCodec.RecordPath, MailCodec.Lawful, MailCodec.Journal;
    var p := codec.RecordPath(key);
    codec.RecordPaths(key);
    LoadIsRecovered(codec, trace[n - 1], key);
    hide Chain;
    if point < |trace| {
      KeptPersists(codec.Journal(), trace, n - 1, point - 1, p);
      DestinationIsFree(codec.Journal(), trace[point - 1], trace[point], batch, p);
    }
  }

  lemma DestinationIsFree(codec: Codec, a: Fs, b: Fs, batch: Batch, p: Path)
    requires Publishes(codec, a, b, batch) && exists f :: f in batch.files && f.path == p
    ensures p !in codec.Recovered(a).files
  {
    hide Codec.Recovered, Codec.Published;
  }

  /** Some batch with a file for `p` is published between `a` and `b`. */
  ghost predicate PublishesPath(codec: Codec, a: Fs, b: Fs, p: Path) {
    exists batch, f :: Publishes(codec, a, b, batch) && f in batch.files && f.path == p
  }

  /** A record that can be looked up was there from the start or was published by some batch of the run. */
  lemma {:induction false} RecordHasOrigin(codec: MailCodec, states: seq<Fs>, key: string, t: nat)
    requires codec.Lawful() && Chain(codec.Journal(), states) && t < |states|
    requires LoadRecord(codec, states[0], key) == Absent && LoadRecord(codec, states[t], key).Found?
    ensures exists i | 0 < i <= t :: PublishesPath(codec.Journal(), states[i - 1], states[i], codec.RecordPath(key))
  {
    hide Codec.Recovered, Codec.Inv, Kept, LoadRecord, Destination, Document, PublishesPath, Linked;
    hide MailCodec.RecordPath, MailCodec.Lawful, MailCodec.Journal;
    var p := codec.RecordPath(key);
    codec.RecordPaths(key);
    assert t > 0;
    LoadIsRecovered(codec, states[t - 1], key);
    LoadIsRecovered(codec, states[t], key);
    if LoadRecord(codec, states[t - 1], key).Found? {
      RecordHasOrigin(codec, states, key, t - 1);
    } else {
      assert Linked(codec.Journal(), states[t - 1], states[t]);
      NewKeptPath(codec.Journal(), states[t - 1], states[t], p);
    }
  }

  lemma NewKeptPath(codec: Codec, a: Fs, b: Fs, p: Path)
    requires Linked(codec, a, b) && Kept(p) && Document(p)
    requires p !in codec.Recovered(a).files && p in codec.Recovered(b).files
    ensures PublishesPath(codec, a, b, p)
  {
    hide Codec.Recovered, Codec.Published, Ready, TmpPath, EndsWith;
    if q :| Edits(codec, a, b, q) {
      TmpIsSeparate(q);
    }
    var batch :| Publishes(codec, a, b, batch);
    PublishedFiles(codec, codec.Recovered(a), batch.id, batch.files, p);
    TxNames(batch.id);
  }
}
