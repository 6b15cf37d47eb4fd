/**
 Admission of captures before anything is materialised (src/capture/budget.rs,
 src/mail/budget.rs, src/sms/budget.rs). The code counts with checked 64-bit additions and
 stops at the first excess; `MailTotal` and `SmsTotal` say the same in unbounded integers.
 */
module Budget {
  import opened Common
  import opened Sorting

  const MAX_CAPTURE_BYTES: nat := 64 * 1024 * 1024
  const ENVELOPE_BYTES: nat := 1024
  const ALL_MAILBOX := "_all"

  /** A text length: no allocation exceeds isize::MAX bytes. */
  predicate Length(n: nat) { n < 0x8000_0000_0000_0000 }

  /** What admission looks at: the pieces a value is serialised in, and its other sizes. */
  datatype MailCharge = MailCharge(json: seq<U64>, raw: U64, recipients: seq<string>)
  datatype RecordCharge = RecordCharge(json: seq<U64>)
  datatype MediaCharge = MediaCharge(json: seq<U64>, content: U64)
  datatype SmsCharge = SmsCharge(json: seq<U64>, media: seq<MediaCharge>)

  function SumBy<T>(s: seq<T>, f: T -> nat): nat {
    if s == [] then 0 else SumBy(s[..|s| - 1], f) + f(Last(s))
  }

  const PIECE_SIZE: U64 -> nat := (n: U64) => n as nat

  function Size(json: seq<U64>): nat { SumBy(json, PIECE_SIZE) }

  lemma SizeOfOne(n: U64)
    ensures Size([n]) == n
  {
    var s: seq<U64> := [n];
    assert s[..|s| - 1] == [];
    assert SumBy(s, PIECE_SIZE) == SumBy(s[..|s| - 1], PIECE_SIZE) + PIECE_SIZE(Last(s));
  }

  // ---- Exact totals ----

  function TargetTotal(json: nat, raw: nat, target: string): nat {
    json + ENVELOPE_BYTES + |target| + raw + if target == ALL_MAILBOX then 0 else json
  }

  /** The recipients a message is filed under, once each, then the account-wide mailbox. */
  function Targets(recipients: seq<string>): seq<string> {
    SortedSet(recipients) + [ALL_MAILBOX]
  }

  function MailMessageTotal(m: MailCharge): nat {
    3 * Size(m.json) + SumBy(Targets(m.recipients), t => TargetTotal(Size(m.json), m.raw, t))
  }

  function RecordTotal(r: RecordCharge): nat { 3 * Size(r.json) + ENVELOPE_BYTES }

  function MailTotal(messages: seq<MailCharge>, records: seq<RecordCharge>): nat {
    SumBy(messages, MailMessageTotal) + SumBy(records, RecordTotal)
  }

  function MediaTotal(m: MediaCharge): nat { 4 * Size(m.json) + ENVELOPE_BYTES + 2 * m.content }

  function SmsMessageTotal(m: SmsCharge): nat {
    4 * Size(m.json) + 4 * ENVELOPE_BYTES + SumBy(m.media, MediaTotal)
  }

  function SmsTotal(messages: seq<SmsCharge>, records: seq<RecordCharge>): nat {
    SumBy(messages, SmsMessageTotal) + SumBy(records, RecordTotal)
  }

  // ---- Sums ----

  lemma {:induction false} SumPrefix<T>(s: seq<T>, f: T -> nat, n: nat)
    requires n <= |s|
    ensures SumBy(s[..n], f) <= SumBy(s, f)
  {
    if n < |s| {
      SumPrefix(s[..|s| - 1], f, n);
      assert s[..|s| - 1][..n] == s[..n];
    } else {
      assert s[..n] == s;
    }
  }

  lemma SumNext<T>(s: seq<T>, f: T -> nat, n: nat)
    requires n < |s|
    ensures SumBy(s[..n + 1], f) == SumBy(s[..n], f) + f(s[n]) <= SumBy(s, f)
  {
    assert s[..n + 1][..n] == s[..n];
    SumPrefix(s, f, n + 1);
  }

  lemma {:induction false} SumRemove<T>(s: seq<T>, f: T -> nat, k: nat)
    requires k < |s|
    ensures SumBy(s, f) == SumBy(s[..k] + s[k + 1..], f) + f(s[k])
  {
    var rest := s[..k] + s[k + 1..];
    if k == |s| - 1 {
      assert rest == s[..|s| - 1];
    } else {
      var t := s[..|s| - 1];
      SumRemove(t, f, k);
      assert rest[..|rest| - 1] == t[..k] + t[k + 1..];
    }
  }

  lemma RemoveOne<T>(s: seq<T>, k: nat)
    requires k < |s|
    ensures multiset(s[..k] + s[k + 1..]) == multiset(s) - multiset{s[k]}
  {
    assert s == s[..k] + [s[k]] + s[k + 1..];
  }

  /** Sums do not depend on the order of their terms. */
  lemma {:induction false} SumPermutation<T>(a: seq<T>, b: seq<T>, f: T -> nat)
    requires multiset(a) == multiset(b)
    ensures SumBy(a, f) == SumBy(b, f)
  {
    if a == [] {
      assert |multiset(b)| == |b|;
    } else {
      var x := Last(a);
      assert x in multiset(b);
      var k :| 0 <= k < |b| && b[k] == x;
      var front, rest := a[..|a| - 1], b[..k] + b[k + 1..];
      RemoveOne(b, k);
      assert a == front + [x];
      assert SumBy(a, f) == SumBy(front, f) + f(x);
      hide SumBy;
      assert multiset(front) == multiset(a) - multiset{x};
      SumPermutation(front, rest, f);
      SumRemove(b, f, k);
    }
  }

  // ---- The counter ----

  class CaptureBudget {
    var bytes: U64

    constructor ()
      ensures bytes == 0
    {
      bytes := 0;
    }

    /** checked_add, then the limit. */
    method Add(n: U64) returns (ok: bool)
      requires bytes <= MAX_CAPTURE_BYTES
      modifies this
      ensures ok <==> old(bytes) + n <= MAX_CAPTURE_BYTES
      ensures bytes == if ok then old(bytes) + n else old(bytes)
    {
      if n > U64_MAX - bytes { return false; }
      var total := bytes + n;
      if total > MAX_CAPTURE_BYTES { return false; }
      bytes := total;
      return true;
    }

    /** checked_mul, then Add. */
    method Copies(n: U64, copies: U64) returns (ok: bool)
      requires bytes <= MAX_CAPTURE_BYTES
      modifies this
      ensures ok <==> old(bytes) + n * copies <= MAX_CAPTURE_BYTES
      ensures bytes == if ok then old(bytes) + n * copies else old(bytes)
    {
      var product: nat := n * copies;
      if product > U64_MAX { return false; }
      ok := Add(product);
    }

    method Records(records: seq<RecordCharge>) returns (ok: bool)
      requires bytes <= MAX_CAPTURE_BYTES
      modifies this
      ensures bytes <= MAX_CAPTURE_BYTES
      ensures ok <==> old(bytes) + SumBy(records, RecordTotal) <= MAX_CAPTURE_BYTES
      ensures ok ==> bytes == old(bytes) + SumBy(records, RecordTotal)
    {
      for i := 0 to |records|
        invariant bytes == old(bytes) + SumBy(records[..i], RecordTotal) <= MAX_CAPTURE_BYTES
      {
        SumNext(records, RecordTotal, i);
        var json := JsonBytes(records[i].json);
        if json == None { return false; }
        ok := Copies(json.value, 3);
        if !ok { return; }
        ok := Add(ENVELOPE_BYTES);
        if !ok { return; }
      }
      assert records[..|records|] == records;
      return true;
    }
  }

  /** json_bytes: counts a serialisation piece by piece and gives up past the limit. */
  method JsonBytes(json: seq<U64>) returns (r: Option<U64>)
    ensures r == if Size(json) <= MAX_CAPTURE_BYTES then Some(Size(json)) else None
  {
    var counter := new CaptureBudget();
    for i := 0 to |json|
      invariant counter.bytes == Size(json[..i]) <= MAX_CAPTURE_BYTES
      invariant fresh(counter)
    {
      SumNext(json, PIECE_SIZE, i);
      var ok := counter.Add(json[i]);
      if !ok { return None; }
    }
    assert json[..|json|] == json;
    return Some(counter.bytes);
  }

  // ---- Mail and text messages ----

  /** add_message */
  method AddMessage(budget: CaptureBudget, m: MailCharge) returns (ok: bool)
    requires budget.bytes <= MAX_CAPTURE_BYTES
    requires forall t | t in m.recipients :: Length(|t|)
    modifies budget
    ensures budget.bytes <= MAX_CAPTURE_BYTES
    ensures ok <==> old(budget.bytes) + MailMessageTotal(m) <= MAX_CAPTURE_BYTES
    ensures ok ==> budget.bytes == old(budget.bytes) + MailMessageTotal(m)
  {
    var json := JsonBytes(m.json);
    if json == None { return false; }
    var bytes := json.value;
    var targets := SortedSet(m.recipients) + [ALL_MAILBOX];
    SortedSetFacts(m.recipients);
    ok := budget.Copies(bytes, 3);
    if !ok { return; }
    ghost var f := t => TargetTotal(Size(m.json), m.raw, t);
    for i := 0 to |targets|
      invariant budget.bytes == old(budget.bytes) + 3 * bytes + SumBy(targets[..i], f) <= MAX_CAPTURE_BYTES
    {
      SumNext(targets, f, i);
      var target := targets[i];
      assert target in m.recipients || target == ALL_MAILBOX;
      ok := ChargeTarget(budget, bytes, m.raw, target);
      if !ok { return; }
    }
    assert targets[..|targets|] == targets;
    return true;
  }

  method ChargeTarget(budget: CaptureBudget, bytes: U64, raw: U64, target: string) returns (ok: bool)
    requires budget.bytes <= MAX_CAPTURE_BYTES && Length(|target|)
    modifies budget
    ensures budget.bytes <= MAX_CAPTURE_BYTES
    ensures ok <==> old(budget.bytes) + TargetTotal(bytes, raw, target) <= MAX_CAPTURE_BYTES
    ensures ok ==> budget.bytes == old(budget.bytes) + TargetTotal(bytes, raw, target)
  {
    ok := budget.Add(bytes);
    if !ok { return; }
    ok := budget.Add(ENVELOPE_BYTES + |target|);
    if !ok { return; }
    ok := budget.Add(raw);
    if !ok { return; }
    if target != ALL_MAILBOX {
      ok := budget.Add(bytes);
    }
  }

  /** check_messages for mail: accepts exactly what fits. */
  method CheckMail(messages: seq<MailCharge>, records: seq<RecordCharge>) returns (ok: bool)
    requires forall m, t | m in messages && t in m.recipients :: Length(|t|)
    ensures ok <==> MailTotal(messages, records) <= 67_108_864
  {
    var budget := new CaptureBudget();
    for i := 0 to |messages|
      invariant fresh(budget) && budget.bytes == SumBy(messages[..i], MailMessageTotal) <= MAX_CAPTURE_BYTES
    {
      SumNext(messages, MailMessageTotal, i);
      ok := AddMessage(budget, messages[i]);
      if !ok { return; }
    }
    assert messages[..|messages|] == messages;
    ok := budget.Records(records);
  }

  function SingleCopyTotal(m: MailCharge, mailbox: string, id: string): nat {
    3 * Size(m.json) + m.raw + ENVELOPE_BYTES + |mailbox| + |id|
  }

  /** check_single_copy */
  method CheckSingleCopy(m: MailCharge, mailbox: string, id: string) returns (ok: bool)
    requires |mailbox| + |id| + ENVELOPE_BYTES <= U64_MAX
    ensures ok <==> SingleCopyTotal(m, mailbox, id) <= 67_108_864
    ensures ok <==> 3 * Size(m.json) + m.raw + |mailbox| + |id| + 1_024 <= 67_108_864
  {
    var budget := new CaptureBudget();
    var json := JsonBytes(m.json);
    if json == None { return false; }
    ok := budget.Copies(json.value, 3);
    if !ok { return; }
    ok := budget.Add(m.raw);
    if !ok { return; }
    ok := budget.Add(ENVELOPE_BYTES + |mailbox| + |id|);
  }

  /** check_messages for text messages */
  method CheckSms(messages: seq<SmsCharge>, records: seq<RecordCharge>) returns (ok: bool)
    ensures ok <==> SmsTotal(messages, records) <= 67_108_864
  {
    var budget := new CaptureBudget();
    for i := 0 to |messages|
      invariant fresh(budget) && budget.bytes == SumBy(messages[..i], SmsMessageTotal) <= MAX_CAPTURE_BYTES
    {
      SumNext(messages, SmsMessageTotal, i);
      ok := AddSms(budget, messages[i]);
      if !ok { return; }
    }
    assert messages[..|messages|] == messages;
    ok := budget.Records(records);
  }

  method AddSms(budget: CaptureBudget, m: SmsCharge) returns (ok: bool)
    requires budget.bytes <= MAX_CAPTURE_BYTES
    modifies budget
    ensures budget.bytes <= MAX_CAPTURE_BYTES
    ensures ok <==> old(budget.bytes) + SmsMessageTotal(m) <= MAX_CAPTURE_BYTES
    ensures ok ==> budget.bytes == old(budget.bytes) + SmsMessageTotal(m)
  {
    var json := JsonBytes(m.json);
    if json == None { return false; }
    ok := budget.Copies(json.value, 4);
    if !ok { return; }
    ok := budget.Copies(ENVELOPE_BYTES, 4);
    if !ok { return; }
    for i := 0 to |m.media|
      invariant budget.bytes <= MAX_CAPTURE_BYTES
      invariant budget.bytes ==
        old(budget.bytes) + 4 * Size(m.json) + 4 * ENVELOPE_BYTES + SumBy(m.media[..i], MediaTotal)
    {
      SumNext(m.media, MediaTotal, i);
      ok := ChargeMedia(budget, m.media[i]);
      if !ok { return; }
    }
    assert m.media[..|m.media|] == m.media;
    return true;
  }

  method ChargeMedia(budget: CaptureBudget, media: MediaCharge) returns (ok: bool)
    requires budget.bytes <= MAX_CAPTURE_BYTES
    modifies budget
    ensures budget.bytes <= MAX_CAPTURE_BYTES
    ensures ok <==> old(budget.bytes) + MediaTotal(media) <= MAX_CAPTURE_BYTES
    ensures ok ==> budget.bytes == old(budget.bytes) + MediaTotal(media)
  {
    var json := JsonBytes(media.json);
    if json == None { return false; }
    ok := budget.Copies(json.value, 4);
    if !ok { return; }
    ok := budget.Add(ENVELOPE_BYTES);
    if !ok { return; }
    ok := budget.Copies(media.content, 2);
  }

  // ---- What each part adds ----

  lemma SumAppend<T>(s: seq<T>, x: T, f: T -> nat)
    ensures SumBy(s + [x], f) == SumBy(s, f) + f(x)
  {
    assert (s + [x])[..|s|] == s;
  }

  /** Without recipients a message is charged for its submission and the account-wide copy. */
  lemma NobodyTotal(m: MailCharge)
    requires m.recipients == []
    ensures MailMessageTotal(m) == 4 * Size(m.json) + m.raw + 1_028
  {
    SortedSetFacts(m.recipients);
    assert Targets(m.recipients) == [ALL_MAILBOX] && |ALL_MAILBOX| == 4;
    SumAppend([], ALL_MAILBOX, t => TargetTotal(Size(m.json), m.raw, t));
    assert [] + [ALL_MAILBOX] == [ALL_MAILBOX];
  }

  /** A new recipient adds a stored copy, its name, its raw bytes and a reported copy; a repeated one nothing. */
  lemma OneMoreRecipient(m: MailCharge, t: string)
    ensures MailMessageTotal(m.(recipients := m.recipients + [t])) == MailMessageTotal(m) +
      if t in m.recipients then 0
      else if t == "_all" then Size(m.json) + m.raw + 1_028
      else 2 * Size(m.json) + m.raw + |t| + 1_024
  {
    var more := m.recipients + [t];
    if t in m.recipients {
      RecipientsOrderFree(m, more);
    } else {
      SortedSetFacts(m.recipients);
      SortedSetFacts(more);
      var a, b := SortedSet(m.recipients), SortedSet(more);
      hide SortedSet, Sorted, TargetTotal;
      assert forall x :: x in a + [t] <==> x in b;
      SameMembersPermute(a + [t], b);
      assert multiset(Targets(more)) == multiset(Targets(m.recipients) + [t]);
      var f := x => TargetTotal(Size(m.json), m.raw, x);
      SumPermutation(Targets(more), Targets(m.recipients) + [t], f);
      SumAppend(Targets(m.recipients), t, f);
      TargetAdds(Size(m.json), m.raw, t);
    }
  }

  lemma TargetAdds(json: nat, raw: nat, t: string)
    ensures TargetTotal(json, raw, t) == if t == "_all" then json + raw + 1_028 else 2 * json + raw + |t| + 1_024
  {
  }

  /** A text message adds four times its fields and four envelopes. */
  lemma OneMoreSms(messages: seq<SmsCharge>, m: SmsCharge, records: seq<RecordCharge>)
    requires m.media == []
    ensures SmsTotal(messages + [m], records) == SmsTotal(messages, records) + 4 * Size(m.json) + 4_096
  {
    SumAppend(messages, m, SmsMessageTotal);
  }

  /** A media item adds four times its description, one envelope, and twice its content. */
  lemma OneMoreMedia(messages: seq<SmsCharge>, m: SmsCharge, x: MediaCharge, records: seq<RecordCharge>)
    ensures SmsTotal(messages + [m.(media := m.media + [x])], records) ==
      SmsTotal(messages + [m], records) + 4 * Size(x.json) + 2 * x.content + 1_024
  {
    SumAppend(messages, m, SmsMessageTotal);
    SumAppend(messages, m.(media := m.media + [x]), SmsMessageTotal);
    SumAppend(m.media, x, MediaTotal);
  }

  /** A repeatability record adds three times its text and one envelope, to either total. */
  lemma OneMoreRecord(mail: seq<MailCharge>, sms: seq<SmsCharge>, records: seq<RecordCharge>, r: RecordCharge)
    ensures MailTotal(mail, records + [r]) == MailTotal(mail, records) + 3 * Size(r.json) + 1_024
    ensures SmsTotal(sms, records + [r]) == SmsTotal(sms, records) + 3 * Size(r.json) + 1_024
  {
    SumAppend(records, r, RecordTotal);
  }

  // ---- Order does not matter ----

  lemma RecipientsOrderFree(m: MailCharge, recipients: seq<string>)
    requires forall t :: t in recipients <==> t in m.recipients
    ensures MailMessageTotal(m.(recipients := recipients)) == MailMessageTotal(m)
  {
    SortedSetOrderFree(recipients, m.recipients);
  }

  lemma AdmissionOrderFree(messages: seq<MailCharge>, records: seq<RecordCharge>,
                           messages': seq<MailCharge>, records': seq<RecordCharge>)
    requires multiset(messages) == multiset(messages') && multiset(records) == multiset(records')
    ensures MailTotal(messages, records) == MailTotal(messages', records')
  {
    SumPermutation(messages, messages', MailMessageTotal);
    SumPermutation(records, records', RecordTotal);
  }

  lemma SmsOrderFree(messages: seq<SmsCharge>, records: seq<RecordCharge>,
                     messages': seq<SmsCharge>, records': seq<RecordCharge>)
    requires multiset(messages) == multiset(messages') && multiset(records) == multiset(records')
    ensures SmsTotal(messages, records) == SmsTotal(messages', records')
  {
    SumPermutation(messages, messages', SmsMessageTotal);
    SumPermutation(records, records', RecordTotal);
  }
}
