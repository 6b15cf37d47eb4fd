/** Admission bounds what a batch hands to the journal (src/mail/budget.rs:13-32, src/mail/filesystem.rs:230-268). */
module Admission {
  import opened Common
  import opened Sorting
  import opened Journal
  import opened Budget
  import opened MailFiles
  import opened MailStoreModel

  const FILE_SIZE: File -> nat := (f: File) => |f.data|

  function RawSize(m: Message): nat { if m.rawMime.Some? then |m.rawMime.value| else 0 }

  /** What admission allows for one copy: its JSON, an envelope, the mailbox name and the raw sidecar. */
  function CopyAllowance(codec: MailCodec, t: Target): nat {
    |codec.messageJson(t.message)| + ENVELOPE_BYTES + |t.mailbox| + RawSize(t.message)
  }

  function Allowance(codec: MailCodec): Target -> nat { (t: Target) => CopyAllowance(codec, t) }

  /** An envelope adds at most its allowance to the message's own JSON. */
  predicate EnvelopeFits(codec: MailCodec, c: StoredMessage) {
    |codec.encodeMessage(c)| <= |codec.messageJson(c.message)| + ENVELOPE_BYTES + |c.mailbox|
  }

  predicate TagFits(codec: MailCodec, r: Record, tx: string) {
    |codec.encodeRecord(r.(tx := tx))| <= |codec.encodeRecord(r)| + ENVELOPE_BYTES
  }

  lemma {:induction false} SumConcat<T>(a: seq<T>, b: seq<T>, f: T -> nat)
    ensures SumBy(a + b, f) == SumBy(a, f) + SumBy(b, f)
  {
    if b == [] {
      assert a + b == a;
    } else {
      SumConcat(a, b[..|b| - 1], f);
      assert (a + b)[..|a + b| - 1] == a + b[..|b| - 1] && Last(a + b) == Last(b);
    }
  }

  /** Sums of related terms. */
  lemma {:induction false} SumBelow<S, T>(a: seq<S>, b: seq<T>, f: S -> nat, g: T -> nat)
    requires |a| == |b| && forall i | 0 <= i < |a| :: f(a[i]) <= g(b[i])
    ensures SumBy(a, f) <= SumBy(b, g)
  {
    if a != [] {
      SumBelow(a[..|a| - 1], b[..|b| - 1], f, g);
    }
  }

  lemma CopyFits(codec: MailCodec, c: StoredMessage, t: Target, tx: string)
    requires EnvelopeFits(codec, c) && CopiesOf([c], [t], tx)
    ensures SumBy(codec.CopyFiles(c), FILE_SIZE) <= CopyAllowance(codec, t)
  {
    assert [c][0] == c && [t][0] == t;
    var files := codec.CopyFiles(c);
    assert SumBy(files[..1], FILE_SIZE) == |codec.encodeMessage(c)| by {
      assert files[..1][..0] == [];
    }
    assert c.message.rawMime.Some? ==>
      files == [files[0], File(codec.RawPath(c.mailbox, c.id), c.message.rawMime.value)];
    assert c.message.rawMime.None? ==> files[..1] == files;
  }

  lemma {:induction false} CopiesFit(codec: MailCodec, copies: seq<StoredMessage>, targets: seq<Target>, tx: string)
    requires CopiesOf(copies, targets, tx) && forall c | c in copies :: EnvelopeFits(codec, c)
    ensures SumBy(codec.FilesOf(copies), FILE_SIZE) <= SumBy(targets, Allowance(codec))
  {
    hide EnvelopeFits, MailCodec.CopyFiles, CopyAllowance;
    if copies != [] {
      var n := |copies| - 1;
      CopiesFit(codec, copies[..n], targets[..n], tx);
      CopyFits(codec, copies[n], targets[n], tx);
      SumConcat(codec.FilesOf(copies[..n]), codec.CopyFiles(copies[n]), FILE_SIZE);
    }
  }

  /** The account-wide copy is charged last and filed first. */
  lemma MessageFits(codec: MailCodec, id: string, m: Message)
    requires Length(|codec.messageJson(m)|) && (m.rawMime.Some? ==> Length(|m.rawMime.value|))
    ensures SumBy(MessageTargets(id, m), Allowance(codec)) <= MailMessageTotal(Charge(codec, m))
  {
    var charge := Charge(codec, m);
    SizeOfOne(|codec.messageJson(m)|);
    var boxes := [ALL_MAILBOX] + SortedSet(m.recipients);
    var f := (t: string) => TargetTotal(Size(charge.json), charge.raw, t);
    hide SortedSet;
    assert multiset(boxes) == multiset(Targets(m.recipients));
    SumPermutation(boxes, Targets(m.recipients), f);
    SumBelow(MessageTargets(id, m), boxes, Allowance(codec), f);
  }

  lemma {:induction false} BatchFits(codec: MailCodec, messages: seq<(string, Message)>)
    requires Sizes(codec, messages, [])
    ensures SumBy(BatchTargets(messages), Allowance(codec)) <= SumBy(Charges(codec, messages), MailMessageTotal)
  {
    if messages != [] {
      var n := |messages| - 1;
      ChargesPrefix(codec, messages);
      BatchFits(codec, messages[..n]);
      MessageFits(codec, messages[n].0, messages[n].1);
      hide MessageTargets, MailMessageTotal, CopyAllowance, Charges, Charge;
      SumConcat(BatchTargets(messages[..n]), MessageTargets(messages[n].0, messages[n].1), Allowance(codec));
    }
  }

  lemma ChargesPrefix(codec: MailCodec, messages: seq<(string, Message)>)
    requires messages != [] && Sizes(codec, messages, [])
    ensures var n := |messages| - 1;
      && Sizes(codec, messages[..n], []) && messages[n] in messages
      && Charges(codec, messages)[..n] == Charges(codec, messages[..n])
      && |Charges(codec, messages)| == n + 1 && Charges(codec, messages)[n] == Charge(codec, messages[n].1)
  {
    assert messages[|messages| - 1] in messages;
    assert forall m | m in messages[..|messages| - 1] :: m in messages;
  }

  lemma RecordsFit(codec: MailCodec, records: seq<Record>, tx: string)
    requires Sizes(codec, [], records) && forall r | r in records :: TagFits(codec, r, tx)
    ensures SumBy(codec.RecordFiles(records, tx), FILE_SIZE) <= SumBy(RecordCharges(codec, records), RecordTotal)
  {
    var charges := RecordCharges(codec, records);
    forall i | 0 <= i < |records| ensures FILE_SIZE(codec.RecordFiles(records, tx)[i]) <= RecordTotal(charges[i]) {
      assert records[i] in records && TagFits(codec, records[i], tx);
      SizeOfOne(|codec.encodeRecord(records[i])|);
    }
    SumBelow(codec.RecordFiles(records, tx), charges, FILE_SIZE, RecordTotal);
  }

  /** An admitted batch hands at most 64 MiB of file bytes to the journal. */
  lemma AdmittedFits(codec: MailCodec, messages: seq<(string, Message)>, records: seq<Record>, tx: string,
                     all: seq<StoredMessage>)
    requires Sizes(codec, messages, records)
    requires MailTotal(Charges(codec, messages), RecordCharges(codec, records)) <= MAX_CAPTURE_BYTES
    requires CopiesOf(all, BatchTargets(messages), tx) && (forall c | c in all :: EnvelopeFits(codec, c))
    requires forall r | r in records :: TagFits(codec, r, tx)
    ensures SumBy(codec.FilesOf(all) + codec.RecordFiles(records, tx), FILE_SIZE) <= MAX_CAPTURE_BYTES
  {
    hide EnvelopeFits, TagFits, MailMessageTotal, RecordTotal, CopiesOf;
    CopiesFit(codec, all, BatchTargets(messages), tx);
    BatchFits(codec, messages);
    RecordsFit(codec, records, tx);
    SumConcat(codec.FilesOf(all), codec.RecordFiles(records, tx), FILE_SIZE);
  }
}
